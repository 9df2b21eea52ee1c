/**
 * Two places where compress_file and decompress_file, as written, report
 * success for a run that went wrong, each shown on the model of the code as
 * written (module Driver) and paired with a corrected run that fails instead,
 * with the property the corrected run keeps.
 *
 * 1. A chunk whose compression fails gets the record compressed_size = 0, but
 *    its slot still holds the compressBound bytes the buffer was sized to, and
 *    those bytes are written into the payload. The container then no longer
 *    holds the payload its header announces.
 * 2. A chunk whose decompression fails is only reported; its slot, sized to
 *    the expected size, is still written out and the run exits with 0.
 */
module Findings {
  import opened Bytes
  import opened Codec
  import opened Planner
  import opened Container
  import opened Pipeline
  import opened Driver

  /** Whether every chunk compresses, checked slot by slot after the join. */
  function AllDeflated(z: Zlib, chunks: seq<seq<byte>>): bool
    requires Lawful(z) && SizesFit(chunks)
  {
    chunks == [] || (Deflate(z, chunks[0], Z_BEST_COMPRESSION).ok && AllDeflated(z, chunks[1..]))
  }

  lemma {:induction false} AllDeflatedIff(z: Zlib, chunks: seq<seq<byte>>)
    requires Lawful(z) && SizesFit(chunks)
    ensures AllDeflated(z, chunks) <==> forall i :: 0 <= i < |chunks| ==> Deflate(z, chunks[i], Z_BEST_COMPRESSION).ok
  {
    if chunks != [] {
      AllDeflatedIff(z, chunks[1..]);
      if !AllDeflated(z, chunks[1..]) {
        var j :| 0 <= j < |chunks[1..]| && !Deflate(z, chunks[1..][j], Z_BEST_COMPRESSION).ok;
        assert chunks[1..][j] == chunks[j + 1];
      }
    }
  }

  /** Whether every block decompresses to its record's original size. */
  function AllInflated(z: Zlib, blocks: seq<seq<byte>>, metas: seq<ChunkMeta>): bool
    requires Lawful(z) && |blocks| == |metas|
  {
    metas == [] || (Inflate(z, blocks[0], metas[0].originalSize).ok && AllInflated(z, blocks[1..], metas[1..]))
  }

  lemma {:induction false} AllInflatedIff(z: Zlib, blocks: seq<seq<byte>>, metas: seq<ChunkMeta>)
    requires Lawful(z) && |blocks| == |metas|
    ensures AllInflated(z, blocks, metas) <==>
              forall i :: 0 <= i < |metas| ==> Inflate(z, blocks[i], metas[i].originalSize).ok
  {
    if metas != [] {
      AllInflatedIff(z, blocks[1..], metas[1..]);
      if !AllInflated(z, blocks[1..], metas[1..]) {
        var j :| 0 <= j < |metas[1..]| && !Inflate(z, blocks[1..][j], metas[1..][j].originalSize).ok;
        assert blocks[1..][j] == blocks[j + 1] && metas[1..][j] == metas[j + 1];
      }
    }
  }

  // ---------------------------------------------------------------------------
  // 1. A failed compression breaks the container's framing.

  lemma {:induction false} PayloadLonger(metas: seq<ChunkMeta>, bufs: seq<seq<byte>>, i: nat)
    requires |metas| == |bufs| && i < |bufs|
    requires forall j :: 0 <= j < |bufs| ==> metas[j].compressedSize <= |bufs[j]|
    requires metas[i].compressedSize < |bufs[i]|
    ensures SumCompressed(metas) < TotalLength(bufs)
  {
    if i > 0 {
      PayloadLonger(metas[1..], bufs[1..], i - 1);
    } else {
      PayloadNotShorter(metas[1..], bufs[1..]);
    }
  }

  lemma {:induction false} PayloadNotShorter(metas: seq<ChunkMeta>, bufs: seq<seq<byte>>)
    requires |metas| == |bufs|
    requires forall j :: 0 <= j < |bufs| ==> metas[j].compressedSize <= |bufs[j]|
    ensures SumCompressed(metas) <= TotalLength(bufs)
  {
    if metas != [] {
      PayloadNotShorter(metas[1..], bufs[1..]);
    }
  }

  /**
   * As written: when the compression of chunk `i` fails (and compressBound of
   * its size is not 0), compress_file still exits with 0, but the container
   * it writes holds more payload than its header announces.
   */
  lemma FailedChunkBreaksFraming(input: seq<byte>, threadsRequested: int, z: Zlib, i: nat)
    requires Lawful(z) && |input| > 0 && InRange(|input|, threadsRequested)
    requires i < |Chunks(input, threadsRequested)|
    requires |Chunks(input, threadsRequested)[i]| < TWO_TO_THE_64
    requires !Deflate(z, Chunks(input, threadsRequested)[i], Z_BEST_COMPRESSION).ok
    requires z.compressBound(|Chunks(input, threadsRequested)[i]|) > 0
    ensures Encode(input, threadsRequested, z).exit == 0
    ensures !WellFramed(Encode(input, threadsRequested, z).written.value)
  {
    ChunksFit(input, threadsRequested);
    var chunks := Chunks(input, threadsRequested);
    var metas := MetaSlots(z, chunks);
    var bufs := CompressedSlots(z, chunks);
    HeaderRoundTrip(metas, Flatten(bufs));
    FlattenLength(bufs);
    PayloadLonger(metas, bufs, i);
  }

  /** A zlib whose compress2 always runs out of memory. */
  function OutOfMemoryZlib(): Zlib
  {
    Zlib(
      (n: u64) => if n < TWO_TO_THE_64 - 13 then n + 13 else n,
      (src: seq<byte>, cap: u64, level: int) => ZOut(Z_MEM_ERROR, 0, Zeros(cap)),
      (src: seq<byte>, cap: u64) => Store(src, cap))
  }

  lemma OutOfMemoryZlibLawful()
    ensures Lawful(OutOfMemoryZlib())
  {
  }

  /**
   * The input that shows it: one byte, one thread, and a compress2 that fails.
   * compress_file exits with 0 and writes a container whose header announces
   * a payload of 0 bytes while 14 bytes follow it.
   */
  lemma OneByteOutOfMemory()
    ensures Lawful(OutOfMemoryZlib())
    ensures Encode([7], 1, OutOfMemoryZlib()).exit == 0
    ensures !WellFramed(Encode([7], 1, OutOfMemoryZlib()).written.value)
  {
    var z := OutOfMemoryZlib();
    assert ChunkLayout(1, 1) == Layout(1, 1);
    assert Chunks([7], 1) == [[7]];
    FailedChunkBreaksFraming([7], 1, z, 0);
  }

  /**
   * Corrected: compress_file fails the run after the join when any chunk
   * failed, and writes nothing.
   */
  function EncodeChecked(input: seq<byte>, threadsRequested: int, z: Zlib): Run
    requires Lawful(z) && InRange(|input|, threadsRequested)
  {
    if |input| == 0 then Run(1, None)
    else
      ChunksFit(input, threadsRequested);
      if !AllDeflated(z, Chunks(input, threadsRequested)) then Run(1, None)
      else Encode(input, threadsRequested, z)
  }

  /**
   * The corrected encoder succeeds exactly when the input is non-empty and
   * every chunk compressed; whenever it succeeds, the container it wrote
   * holds exactly the payload its header announces and decompresses to the
   * input; whenever it fails, it wrote nothing.
   */
  lemma EncodeCheckedSound(input: seq<byte>, threadsRequested: int, z: Zlib)
    requires Lawful(z) && InRange(|input|, threadsRequested)
    ensures EncodeChecked(input, threadsRequested, z).exit == 0 <==>
              |input| > 0 && AllCompressed(input, threadsRequested, z)
    ensures EncodeChecked(input, threadsRequested, z).exit != 0 ==>
              EncodeChecked(input, threadsRequested, z).written == None
    ensures EncodeChecked(input, threadsRequested, z).exit == 0 ==>
              EncodeChecked(input, threadsRequested, z).written.Some? &&
              WellFramed(EncodeChecked(input, threadsRequested, z).written.value) &&
              Decode(EncodeChecked(input, threadsRequested, z).written.value, z) == Run(0, Some(input))
  {
    if |input| > 0 {
      ChunksFit(input, threadsRequested);
      AllDeflatedIff(z, Chunks(input, threadsRequested));
      if AllDeflated(z, Chunks(input, threadsRequested)) {
        EncodedWellFramed(input, threadsRequested, z);
        RoundTrip(input, threadsRequested, z);
      }
    }
  }

  // ---------------------------------------------------------------------------
  // 2. A failed decompression still exits with 0.

  /**
   * As written: once the header and the blocks are read, decompress_file
   * exits with 0 and writes the slots even when a chunk failed to
   * decompress.
   */
  lemma FailedDecompressionStillSucceeds(container: seq<byte>, z: Zlib, i: nat)
    requires Lawful(z)
    requires ParseHeader(container).Parsed?
    requires Unframe(ParseHeader(container).rest, ParseHeader(container).metas).Some?
    requires i < |ParseHeader(container).metas|
    requires var p := ParseHeader(container);
             !Inflate(z, Unframe(p.rest, p.metas).value.blocks[i], p.metas[i].originalSize).ok
    ensures Decode(container, z).exit == 0 && Decode(container, z).written.Some?
  {
  }

  /**
   * The input that shows it: a container with one record announcing an empty
   * block that should decompress to `n` bytes. Decompression fails, yet the
   * run exits with 0 and writes `n` zero bytes that were never compressed.
   */
  lemma EmptyBlockDecodesToZeros(n: u64)
    requires n > 0
    ensures Lawful(StoredZlib())
    ensures !Inflate(StoredZlib(), [], n).ok
    ensures Decode(HeaderBytes([ChunkMeta(0, n)]), StoredZlib()) == Run(0, Some(Zeros(n)))
  {
    StoredZlibLawful();
    var z := StoredZlib();
    var metas := [ChunkMeta(0, n)];
    EmptyRecordReadable(n);
    EmptyBlockFramed(n);
    StoredInflateEmpty(n);
    EmptySlotZeros(n);
    DecodeReadable(HeaderBytes(metas), z, metas, [], [[]], []);
  }

  /** The header with one record of compressed size 0 reads back in full. */
  lemma EmptyRecordReadable(n: u64)
    ensures ParseHeader(HeaderBytes([ChunkMeta(0, n)])) == Parsed([ChunkMeta(0, n)], [])
  {
    var metas := [ChunkMeta(0, n)];
    HeaderRoundTrip(metas, []);
    assert HeaderBytes(metas) + [] == HeaderBytes(metas);
  }

  /** With nothing after the header, that record's block is read as empty. */
  lemma EmptyBlockFramed(n: u64)
    ensures Unframe([], [ChunkMeta(0, n)]) == Some(Blocks([[]], []))
  {
    UnframeRoundTrip([[]], [ChunkMeta(0, n)], []);
    assert Flatten([[]]) + [] == [];
  }

  /** The slots of that one failed block hold `n` zero bytes in all. */
  lemma EmptySlotZeros(n: u64)
    requires n > 0
    ensures Lawful(StoredZlib())
    ensures Flatten(DecompressedSlots(StoredZlib(), [[]], [ChunkMeta(0, n)])) == Zeros(n)
  {
    StoredZlibLawful();
    StoredInflateEmpty(n);
    var outs := DecompressedSlots(StoredZlib(), [[]], [ChunkMeta(0, n)]);
    assert outs == [Zeros(n)];
    assert Flatten([Zeros(n)]) == Zeros(n) + Flatten([]);
  }

  /** Inflating an empty block fails, leaving `n` zero bytes in the slot. */
  lemma StoredInflateEmpty(n: u64)
    requires n > 0
    ensures Inflate(StoredZlib(), [], n) == Slot(false, Zeros(n))
  {
    assert StoredZlib().uncompress([], n) == ZOut(Z_OK, 0, Zeros(n));
  }

  /**
   * Corrected: decompress_file fails the run after the join when any chunk
   * failed, and writes nothing.
   */
  function DecodeChecked(container: seq<byte>, z: Zlib): Run
    requires Lawful(z)
  {
    match ParseHeader(container)
    case Invalid => Run(1, None)
    case Parsed(metas, rest) =>
      match Unframe(rest, metas)
      case None => Run(1, None)
      case Some(Blocks(blocks, _)) =>
        if !AllInflated(z, blocks, metas) then Run(1, None)
        else Run(0, Some(Flatten(DecompressedSlots(z, blocks, metas))))
  }

  /**
   * The corrected decoder succeeds only when every block decompressed to
   * exactly its record's original size, and then writes what the as-written
   * decoder writes; when it fails, it writes nothing.
   */
  lemma DecodeCheckedSound(container: seq<byte>, z: Zlib)
    requires Lawful(z)
    ensures DecodeChecked(container, z).exit == 0 <==>
              Decode(container, z).exit == 0 &&
              var p := ParseHeader(container);
              forall i :: 0 <= i < |p.metas| ==>
                Inflate(z, Unframe(p.rest, p.metas).value.blocks[i], p.metas[i].originalSize).ok
    ensures DecodeChecked(container, z).exit == 0 ==> DecodeChecked(container, z) == Decode(container, z)
    ensures DecodeChecked(container, z).exit != 0 ==> DecodeChecked(container, z).written == None
  {
    var p := ParseHeader(container);
    if p.Parsed? {
      UnframeIff(p.rest, p.metas);
      if Unframe(p.rest, p.metas).Some? {
        AllInflatedIff(z, Unframe(p.rest, p.metas).value.blocks, p.metas);
      }
    }
  }

  /**
   * Corrected end to end: whatever the corrected encoder writes, the
   * corrected decoder accepts and turns back into the input.
   */
  lemma CheckedRoundTrip(input: seq<byte>, threadsRequested: int, z: Zlib)
    requires Lawful(z) && InRange(|input|, threadsRequested)
    requires EncodeChecked(input, threadsRequested, z).exit == 0
    ensures EncodeChecked(input, threadsRequested, z).written.Some?
    ensures DecodeChecked(EncodeChecked(input, threadsRequested, z).written.value, z) == Run(0, Some(input))
  {
    EncodeCheckedSound(input, threadsRequested, z);
    ChunksFit(input, threadsRequested);
    var chunks := Chunks(input, threadsRequested);
    var metas := MetaSlots(z, chunks);
    var bufs := CompressedSlots(z, chunks);
    var c := EncodeChecked(input, threadsRequested, z).written.value;
    HeaderRoundTrip(metas, Flatten(bufs));
    UnframeRoundTrip(bufs, metas, []);
    assert Flatten(bufs) + [] == Flatten(bufs);
    AllDeflatedIff(z, chunks);
    forall i | 0 <= i < |metas|
      ensures Inflate(z, bufs[i], metas[i].originalSize).ok
    {
      ChunkRoundTrip(z, chunks[i], Z_BEST_COMPRESSION);
    }
    AllInflatedIff(z, bufs, metas);
    DecodeCheckedSound(c, z);
  }
}
